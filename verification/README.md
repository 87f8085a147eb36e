# Spices database: enrichment, loading, batch download and de-duplication rules

A Dafny model of the rules that sit under the Flask views and SQLite plumbing
of the spices/phytochemicals database. The system keeps these tables:

- spices;
- phytochemicals, each with an optional PubChem compound id (`cid`);
- spice–phytochemical links;
- one structure row per phytochemical (two flags and three file paths);
- one descriptor row per phytochemical (fifteen PubChem properties).

Four programs act on those tables, and the model covers the logic of each:

- **The web app (`app.py`).** The first time a phytochemical page is viewed,
  the app enriches it on demand. It downloads the 2D/3D SDF records and the
  PNG depiction, retrying with a linear backoff, and records their paths. It
  fetches the batched descriptors, falling back to the text endpoint for a
  missing SMILES. Then it evaluates five drug-likeness rule sets (Lipinski,
  Veber, Ghose, Egan, Muegge) on the descriptors.
- **The spreadsheet loader (`load_data.py`).** Header and cell normalisers,
  the column alias table with its required-columns check, and the per-row
  rules:
  - a spice is inserted or ignored;
  - rows with a `cid` share one phytochemical, and a row without a `cid` gets a
    new one;
  - the structure flags are merged with `MAX`.
- **The batch downloader (`download_structures.py`).** Its own retry loop
  differs from the app's: only empty bodies and network errors are retried, an
  uncaught error ends the run, and no pause follows the last attempt. It also
  covers `rel_to_static`, the per-mode choice of artifacts for the modes
  `missing`, `all` and `backfill2d`, and the main loop with a commit every
  fiftieth row.
- **The duplicate fixer (`fix_duplicates.py`).** Groups of phytochemicals that
  share a name are found, and the keeper is chosen by CID presence, then spice
  count, then structure count. Each duplicate's links and structure row move
  to the keeper, and the duplicate is deleted.

How the model represents the system:

- Tables are Dafny maps and sets.
- The compound service is an input. A `Server` gives the outcome of every
  attempt of every download. A `Service` also gives the batched property table
  and the text endpoint.
- The file store is a map from path to bytes.
- Every operation is a pure function.

Modules, one per file:

- `Wrappers` (Option/Result);
- `Text` (Python whitespace, `strip`, `re.sub(r"\s+", " ", …)`, `lower`, decimal digits);
- `Store` (records and tables);
- `Remote` (attempt outcomes, servers, files);
- `Enrichment`;
- `DrugLikeness`;
- `LoadData`;
- `BatchDownload`;
- `Dedup`.

Behaviour of the code worth knowing before reading the model:

- **The batch downloader can raise.** It catches only `HTTPError`, `URLError`
  and `TimeoutError`. Any other error escapes and ends the run: the `Raised`
  outcome, and `BatchResult.aborted`.
- **It does not reject short bodies.** Only empty bodies count as failures; the
  100-byte check exists only in the web app's downloader.
- **It overwrites existing files.** It has no skip-if-present check.
- **It selects only rows that have a structure row.** The selection is an inner
  join on `structures`, so phytochemicals without one are never visited.
- **The app's downloader catches everything.** Every exception counts as a
  failed attempt, and it sleeps after every failed attempt, including the last.
- **The loader reads flags as text.** A flag cell holding the number `1` reads
  as "1.0" once its column also has empty cells, and "1.0" is not a true token
  (`LoadData.ToBoolFloatOne`).
- **The loader raises on a sheet that mixes rows with and without a `cid`.**
  The model loads such a sheet as the comment at load_data.py:285 intends and
  keeps the script's behaviour as `LoadData.LoadSheetAsWritten` (see
  "## Findings").
- **The duplicate fixer runs with foreign keys off.** Its deletes cascade
  nowhere. The model's main script uses cascading deletes, and
  `Dedup.FixDuplicatesAsWritten` is the script as it runs (see "## Findings").

## Model

| member | source | states |
|---|---|---|
| Store.Max | load_data.py:231-236 | The `MAX` flag merge returns a 0/1 flag that is at least both inputs and equal to one of them. |
| Text.Strip | load_data.py:27 | `str.strip()` returns a string with no whitespace at either end, which is empty exactly when the input is all whitespace. |
| Text.StripPadded | load_data.py:27 | `strip()` of a trimmed core between whitespace runs is exactly that core. |
| Text.StripIgnoresPadding | load_data.py:34 | Adding whitespace around a cell does not change what `strip()` returns. |
| Text.StripLower | load_data.py:34 | Stripping then lowercasing equals lowercasing then stripping. |
| Text.Collapse | load_data.py:28 | `re.sub(r"\s+", " ", s)` leaves only single plain spaces, keeps a leading non-space character, and is empty only for empty input. |
| Text.CollapseShape | load_data.py:28 | The collapsed text is the whitespace-free words joined by one space, plus one space for leading whitespace and one for trailing whitespace. |
| Text.StripOfCollapse | load_data.py:21 | Collapsing then stripping a header gives its words joined by single spaces, which is in normal form. |
| Text.CollapseOfStrip | load_data.py:27-28 | Stripping then collapsing a name also gives its words joined by single spaces. |
| Text.CollapseSingleSpaced | load_data.py:28 | Text already single-spaced is a fixed point of the collapse. |
| Text.SqueezedFixed | load_data.py:107 | Text in normal form is unchanged by both the collapse and `strip()`. |
| Text.JoinWordsSqueezed | load_data.py:28-29 | Words joined by single spaces are single-spaced and trimmed, and are non-empty when there is a word. |
| Text.Lower | load_data.py:21 | `str.lower()` character by character, over ASCII and Latin-1 capitals; what it guarantees is stated by the two rows below. |
| Text.LowerIsLower | load_data.py:21 | `lower()` output is lowercase. |
| Text.LowerOfLower | load_data.py:21 | `lower()` leaves lowercase text unchanged. |
| Text.LowerKeepsSqueezed | load_data.py:21 | Lowercasing keeps text in normal form. |
| Text.NatToStringRoundTrip | load_data.py:44 | The decimal digits `str(n)` renders read back as `n`. |
| Text.NatToStringInjective | app.py:189-191 | Different numbers render differently. |
| Text.IntToStringInjective | app.py:189-191 | Different compound ids give different `CID_{cid}` file names. |
| Enrichment.AttemptFrom | app.py:114-136 | From attempt `n` to `retries`: success iff some attempt has at least 100 bytes; on success the first such attempt wrote the file and all earlier ones were rejected; on failure the files are unchanged; after failed attempt `m` it backs off `0.8*m`. |
| Enrichment.DownloadFile | app.py:103-136 | A non-empty existing file means true with no attempt. Otherwise true iff one of the first `retries` attempts is valid; only that attempt writes `dest`; every failed attempt, the last included, is followed by a backoff; true iff `dest` is present afterwards. |
| Enrichment.DownloadAfterTwoFailures | app.py:114-136 | Two rejected attempts then a valid one: success on attempt 3, backoffs exactly [0.8, 1.6], and the file holds the third body. |
| Enrichment.DownloadIdempotent | app.py:108-110 | After a successful download, a second one succeeds with no attempt and changes nothing, whatever the server does. |
| Enrichment.UpsertStructurePaths | app.py:146-169 | Afterwards a row for the phytochemical exists. `got2d` sets `has_2d=1` and the `structures/sdf2d/CID_{cid}.sdf` path, and leaves both as before otherwise; 3D likewise; PNG sets only its path. Other rows are unchanged and no field is cleared. |
| Enrichment.UpsertMerges | app.py:146-169 | Two upserts are one upsert of what either obtained, so a repeated upsert changes nothing. |
| Enrichment.DestsDistinct | app.py:189-191 | The three artifacts of a compound are written to three different files. |
| Enrichment.FetchStructuresOnDemand | app.py:175-208 | A falsy `cid` means false with nothing changed and no request. Otherwise true iff some artifact is obtainable, and it upserts exactly the obtainable artifacts only in that case; every obtainable artifact ends on disk; structure rows only grow. |
| Enrichment.DownloadObtains | app.py:193-195 | One download succeeds iff its artifact is already present or one of the three attempts is valid. |
| Enrichment.DownloadElsewhere | app.py:193-195 | A download does not change whether another destination is present. |
| Enrichment.FetchedFacts | app.py:193-197 | Each of the three sequential downloads succeeds iff its own artifact was obtainable from the original files; when all three fail the files are unchanged. |
| Enrichment.PartialFailure | app.py:193-204 | When only the PNG fails, the row still gets both SDF flags and paths and its PNG path stays as before. |
| Enrichment.FetchIdempotent | app.py:175-208 | Once all three artifacts were obtained, a second visit sends no request and returns true with the row unchanged, whatever the service does. |
| Enrichment.TxtValue | app.py:238-244 | A failed request is NULL. A body is trimmed; it is NULL iff the trimmed text is empty or reads "null" in any case; otherwise the value is the trimmed text. |
| Enrichment.TxtValuePadded | app.py:241-242 | A padded proper value comes back without its padding. |
| Enrichment.TxtValueNullMarker | app.py:241-242 | A padded "null" marker in any letter case comes back NULL. |
| Enrichment.BuildDescriptorRow | app.py:280-304 | Every column except the two SMILES is the batched value. Each SMILES falls back to the text endpoint only when the batched value is NULL, and the text property is requested exactly in that case. |
| Enrichment.BuildDescriptorRowStable | app.py:299-304 | Building again from a built row against the same service changes nothing. |
| Enrichment.SmilesFallbackFound | app.py:300-301 | A NULL canonical SMILES with the text endpoint answering "CCO" is stored as "CCO". |
| Enrichment.SmilesFallbackNull | app.py:300-301 | A NULL canonical SMILES with the text endpoint answering "null" stays NULL, not the marker text. |
| Enrichment.FetchDescriptors | app.py:247-360 | True iff the cid is truthy and the batched request succeeded. On failure the table is unchanged. On success only this phytochemical's row is written, with all fifteen columns from the built row. |
| Enrichment.FetchPhytoFull | app.py:719-752 | The joined row exists iff the phytochemical does, and carries its name, cid, structure row and descriptor row, or the all-NULL stand-ins of the LEFT JOINs. |
| Enrichment.NeedsStructures | app.py:772-777 | The structure condition: a truthy cid and all three paths falsy. |
| Enrichment.NeedsDescriptors | app.py:782-787 | The descriptor condition: a truthy cid and a NULL weight, SMILES or InChIKey. |
| Enrichment.EnrichStructures | app.py:777-779 | When due, the structures table and the files become what the structure fetch leaves; otherwise nothing changes. No other table changes and structure rows only grow. |
| Enrichment.EnrichDescriptors | app.py:787-789 | When due, the descriptors table becomes what the descriptor fetch leaves; otherwise nothing changes. No other table and no file changes. |
| Enrichment.RulesFor | app.py:791 | The rule report is present iff the molecular weight is, and is then the five rule sets evaluated on the row. |
| Enrichment.PhytochemicalDetail | app.py:756-791 | 404 iff the phytochemical is absent. Structure enrichment runs iff the cid is truthy and all three paths are falsy, and then the structures table and the files are exactly what `fetch_structures_on_demand` leaves. Descriptor enrichment runs iff the cid is truthy and weight, SMILES or InChIKey is NULL, and then the descriptors table is exactly what `fetch_descriptors_from_pubchem` leaves. The page shows the re-read row. Rules are evaluated iff the weight is present. Only the structure and descriptor tables change, and structures only grow. |
| DrugLikeness.Violations | app.py:385-389 | The positions of the violated criteria of a table: each once, in increasing order, all of them and only them. |
| DrugLikeness.FailedLabels | app.py:385-389 | The labels of the violated criteria, one per violated criterion, in table order: the j-th label is the label of the j-th violated criterion. |
| DrugLikeness.Evaluate | app.py:385-390 | `fail_count` is the number of violated criteria and `fails` their labels in table order; `pass` holds iff nothing failed; the note is the rule set's. |
| DrugLikeness.CalcDruglikenessRules | app.py:365-420 | Each of the five entries is its own rule table (Lipinski, Veber, Ghose, Egan, Muegge) evaluated on the row. All five are well formed, and with every descriptor NULL all five pass. |
| DrugLikeness.NullPasses | app.py:372-418 | With every descriptor NULL, a rule set passes: each test checks `is not None` first. |
| DrugLikeness.NullNeverFails | app.py:372-418 | A NULL descriptor never fails: the failure list equals the one with its criteria struck out. |
| DrugLikeness.FailuresMonotone | app.py:384-417 | Under upper-bound criteria, raising present descriptors never removes a failure. |
| DrugLikeness.LipinskiExample | app.py:384-390 | mw=600, xlogp=6, hbd=2, hba=4 gives Lipinski fail, fail_count 2, fails ["MW > 500", "XlogP > 5"], note "Rule of 5". |
| LoadData.NormCol | load_data.py:19-22 | A normalised header is the lowercased words of the header joined by single spaces: trimmed, single-spaced and lowercase. |
| LoadData.NormColIdempotent | load_data.py:19-22 | Normalising a header twice equals normalising it once. |
| LoadData.CleanName | load_data.py:24-29 | None iff the cell is missing or all whitespace; otherwise the words of the cell joined by single spaces, in normal form. |
| LoadData.CleanNameIdempotent | load_data.py:24-29 | Cleaning a cleaned name changes nothing. |
| LoadData.ToBool | load_data.py:31-35 | A missing cell is 0. A cell whose text is a trimmed core between whitespace runs is 1 iff the lowercased core is one of "yes", "y", "1", "true", "-", and 0 otherwise. |
| LoadData.ToBoolNormalises | load_data.py:31-35 | Padding and letter case do not change a flag. |
| LoadData.ToBoolFloatOne | load_data.py:31-35 | The cell text "1.0" reads as 0. |
| LoadData.DecimalValue | load_data.py:43-44 | A plain digit string reads as its value. |
| LoadData.ParseCid | load_data.py:37-46 | A missing cell is None. For a cell whose text is a trimmed core between whitespace runs: a core that lowercases to "na", "nil", "-" or "" is None; any other core is its decimal reading; a core of plain digits is exactly its value. |
| LoadData.ParseCidRoundTrip | load_data.py:37-46 | In the digit-literal reading, `str(n)` with any padding parses back to `n`. |
| LoadData.DecimalWithFraction | load_data.py:43-44 | In the digit-literal reading, "d.e" reads as the integer part `d` (Python's double rounding is not modelled; see "## Left out"). |
| LoadData.ParseCidFraction | load_data.py:37-46 | In the digit-literal reading, a cell "d.e" parses to the integer part `d` (double rounding not modelled). |
| LoadData.ParseCidFloatCell | load_data.py:37-46 | A numeric id that arrives as "n.0" still parses to `n`. |
| LoadData.Scrub | load_data.py:102-106 | Byte-order marks and zero-width spaces are removed, each no-break space becomes a plain space, and every other character is kept in order. |
| LoadData.ScrubConcat | load_data.py:102-106 | Scrubbing works character by character: the scrub of a concatenation is the concatenation of the scrubs. |
| LoadData.Lookup | load_data.py:109 | An alias is found iff it is a key of the table, and the canonical name returned is the one paired with it. |
| LoadData.Targets | load_data.py:94-110 | One unified name, or a drop, per header. |
| LoadData.FirstColumn | load_data.py:118 | The first column that unifies to a given name. |
| LoadData.MissingCols | load_data.py:114 | The required names that no kept column provides, and only those. |
| LoadData.UnifyColumns | load_data.py:92-118 | Fails iff some required column is not provided, reporting exactly the missing ones. On success, for each required name in order, the first kept column that unifies to it. |
| LoadData.Selection | load_data.py:118 | With every required name provided, one first-providing column per required name, in order. |
| LoadData.UnnamedNeverRead | load_data.py:94-95 | No column read after unification has a normalised name starting with "unnamed". |
| LoadData.CleanRow | load_data.py:245-253 | A row is dropped iff its spice or phytochemical name cleans to None; otherwise each field is its cleaned cell. |
| LoadData.Kept | load_data.py:253 | The positions of the raw rows whose names both clean to a value: all of them and only them, in increasing order. |
| LoadData.CleanRows | load_data.py:245-253 | The kept rows are the cleaned forms of exactly the raw rows that survive `dropna`, each once, in sheet order. |
| LoadData.ResolvePhyto | load_data.py:268-287 | A row with a cid lands on the phytochemical already indexed for it, or on a new one now indexed for it. A row without a cid always gets a new phytochemical with no cid. An existing row found by cid gets the row's name iff its own name is blank, and is otherwise unchanged; every other phytochemical is unchanged. The index stays consistent with the table. |
| LoadData.RaiseFlags | load_data.py:294-295 | A new structure row carries the row's flags. An existing row's flags become the `MAX` of old and new, with its paths untouched. Other rows are unchanged and nothing shrinks. |
| LoadData.LoadRow | load_data.py:256-295 | After a row, its phytochemical exists and is linked to its spice, and its structure row has flags at least the row's. A new spice keeps the row's botanical name. The row's link is present afterwards and no other link is added. Nothing is removed and no flag drops. |
| LoadData.LoadRows | load_data.py:256-295 | Corrected sheet step. The store only grows over a sheet's rows, and each row gets one phytochemical id. |
| LoadData.LoadRowsLoaded | load_data.py:256-295 | After the whole sheet, every row is still loaded: its phytochemical, link and flags are all present. |
| LoadData.NoCidFresh | load_data.py:284-287 | Corrected sheet step. A row without a cid gets a phytochemical that no other row of the sheet gets. |
| LoadData.SameCidSameId | load_data.py:269-278 | Rows that share a cid end on the same phytochemical. |
| LoadData.LoadSheetAsWritten | load_data.py:250-270 | The script's sheet step raises iff some raw row has a cid and some kept row has none; otherwise it is the corrected sheet step. |
| LoadData.MixedSheetAborts | load_data.py:250-287 | For a sheet with a cid in one row and a kept row without one, the script's step raises, while the corrected step loads that row as a fresh phytochemical. |
| LoadData.Accepted | load_data.py:241-243 | The number of leading sheets whose headers provide every required column: all of them do, and the next sheet, if any, does not. |
| LoadData.Load | load_data.py:241-297 | Sheet by sheet, the store only grows. Loading stops at the first sheet whose header lacks a required column, and the report is that sheet's missing columns; there is a report iff such a sheet exists. The rows processed are exactly the kept rows of the sheets before it. |
| BatchDownload.TryFrom | download_structures.py:38-56 | From attempt `n`: saved iff a non-empty body arrives before any uncaught error; raised iff an uncaught error comes first; failed iff every remaining attempt is caught. Only a save writes the file, and the pause after attempt `m` is `1.5*m`. |
| BatchDownload.Download | download_structures.py:34-56 | The file is overwritten iff some attempt delivers before any raise. At most `retries` attempts are made, and the pauses number one fewer than the attempts. |
| BatchDownload.DownloadThreeEmpty | download_structures.py:38-56 | Three empty bodies fail after three attempts, with pauses [1.5, 3.0] and none after the last. |
| BatchDownload.DownloadStopsEarly | download_structures.py:38-56 | Attempts after the first uncaught one are never made: servers that agree up to it give the same result. |
| BatchDownload.TryFromCaught | download_structures.py:50-54 | A caught attempt hands over to the next, pausing `1.5*n` unless it was the last. |
| BatchDownload.Slashes | download_structures.py:70 | Every backslash becomes a forward slash and nothing else changes. |
| BatchDownload.RelToStatic | download_structures.py:59-70 | With a "static" component, the components after its first occurrence joined by "/"; otherwise the rendered path with backslashes turned into slashes. |
| BatchDownload.RelToStaticAt | download_structures.py:66-69 | The path after the first "static" component. |
| BatchDownload.RelToStaticExample | download_structures.py:62-63 | "static/structures/png/CID_2758.png" becomes "structures/png/CID_2758.png". |
| BatchDownload.WindowsPathSlashes | download_structures.py:70 | A Windows path without "static" comes back as its components joined by "/". |
| BatchDownload.DestOf | download_structures.py:157-188 | The destination `out_dir / <sub> / CID_<cid>.<ext>` of each artifact. |
| BatchDownload.DefaultDestRel | download_structures.py:155-194 | Under the default `static/structures` output directory, a destination becomes "structures/<sub>/<file>". |
| BatchDownload.DefaultDestMatchesApp | download_structures.py:155-194 | With the default output directory, the batch tool records exactly the paths the web app records for each artifact. |
| BatchDownload.RelToStaticNonEmpty | download_structures.py:59-70 | A recorded path is never empty, so the `missing` mode does not plan it again. |
| BatchDownload.Selected | download_structures.py:107-118 | The rows the selection query returns: each phytochemical with a cid and a structure row once, in increasing cid order, carrying that row. |
| BatchDownload.SelectedDistinct | download_structures.py:107-118 | The selected rows name distinct phytochemicals. |
| BatchDownload.Limit | download_structures.py:120-121 | A positive limit keeps that many leading rows; otherwise all rows are kept. |
| BatchDownload.PlanRow | download_structures.py:134-148 | `all` plans all three. `backfill2d` skips iff `has_3d` is 0 and never plans 3D. Outside `all`, 2D and PNG are planned iff their paths are empty. 3D is only planned outside `backfill2d`, and only when `has_3d == 1` or the mode is `all`. |
| BatchDownload.MissingPlan | download_structures.py:137-171 | In the `missing` mode an artifact is planned iff its path is empty, and 3D only when `has_3d == 1`. |
| BatchDownload.Record | download_structures.py:158-194 | Saving a 2D or 3D record sets its path and its flag to 1; saving the PNG sets only its path. |
| BatchDownload.Get | download_structures.py:155-164 | Saved iff the download saves, raised iff it raises. Only a save updates this phytochemical's row; other rows are unchanged. |
| BatchDownload.Stage | download_structures.py:155-195 | A planned artifact is downloaded and recorded; an unplanned one changes nothing. |
| BatchDownload.ProcessRow | download_structures.py:150-195 | 2D, then 3D, then PNG. The row raises iff a planned stage raises. A stage saves iff it was planned, no earlier stage raised, and the server delivers. The row's effect is exactly the saved artifacts; other rows are unchanged. |
| BatchDownload.ProcessRest | download_structures.py:166-195 | The 3D and PNG stages after a 2D stage that did not raise. |
| BatchDownload.Advance | download_structures.py:130-200 | A row raises iff a planned stage raises. Otherwise `attempted` grows by one, skipped rows included, and only this row's structure row changes, by the artifacts obtained. The committed tables stay a stage of the working ones. |
| BatchDownload.AdvancePlanned | download_structures.py:150-200 | A planned row's downloads, the counters, and the periodic commit. |
| BatchDownload.Commit | download_structures.py:197-199 | The committed tables move towards the working tables. |
| BatchDownload.RunRows | download_structures.py:130-202 | The run aborts iff some row raises. Otherwise every row is attempted and the tables only grow. The persisted tables grow from the last commit, and the counters never exceed `attempted`. |
| BatchDownload.RunRowsUntouched | download_structures.py:130-202 | A structure row no selected row names ends as it was. |
| BatchDownload.RunRowsRowEffect | download_structures.py:130-202 | In a run that does not abort, each row ends with exactly the artifacts its plan asked for and the server delivered. |
| BatchDownload.RunBatch | download_structures.py:120-203 | The whole loop with the final commit: aborted iff some row raises; otherwise all rows are attempted; rows only grow. |
| BatchDownload.RunBatchUntouched | download_structures.py:130-203 | Phytochemicals outside the selection keep their structure row, even when the run aborts. |
| BatchDownload.RunBatchRowEffect | download_structures.py:130-203 | In a run that does not abort, each selected row's effect is the obtained artifacts. |
| BatchDownload.MissingSettles | download_structures.py:137-194 | After a `missing` row obtained everything it planned, planning it again asks for nothing. |
| Dedup.RankOf | fix_duplicates.py:24-34 | The sort key of a group row: CID presence, link count and structure-row count. |
| Dedup.Precedes | fix_duplicates.py:30-33 | The query order: by the three keys descending, ties by ascending id. |
| Dedup.PrecedesTotal | fix_duplicates.py:30-33 | Any two distinct rows of a group are ordered one way or the other. |
| Dedup.PrecedesTransitive | fix_duplicates.py:30-33 | The group order is transitive. |
| Dedup.HasFirst | fix_duplicates.py:30-39 | Every non-empty group has a row that precedes all the others. |
| Dedup.First | fix_duplicates.py:39 | That first row. |
| Dedup.Order | fix_duplicates.py:24-34 | The group in query order: each row once, sorted by the three descending keys. |
| Dedup.KeeperRanksFirst | fix_duplicates.py:24-39 | The keeper has a CID whenever some row of the group has one. Among rows with the same CID status it has the most spice links, and it precedes every other row. |
| Dedup.MergeDup | fix_duplicates.py:48-71 | Corrected step, with cascading deletes. The duplicate's row is deleted. Its links move to the keeper, and links it shares with the keeper are dropped. Its structure row moves to the keeper iff the keeper has none, and is removed otherwise. Its descriptor row is deleted. |
| Dedup.MergeDupAsWritten | fix_duplicates.py:48-71 | The same step without cascades: a link to a spice the keeper already has stays on the deleted row, and the duplicate's descriptor row stays. |
| Dedup.AsWrittenOrphans | fix_duplicates.py:50-71 | As written, a link to the deleted row remains iff some spice is linked to both rows; otherwise it agrees with the corrected step. |
| Dedup.OrphanExample | fix_duplicates.py:50-71 | Spice 7 linked to rows 1 and 2, both named "x": as written, link (7, 2) and row 2's descriptors survive row 2's deletion. |
| Dedup.FirstWith | fix_duplicates.py:56-65 | The first duplicate, in merge order, that has a structure row, if any. |
| Dedup.MergeDups | fix_duplicates.py:48-71 | Corrected step: the duplicates folded into the keeper one after another, in query order. |
| Dedup.MergeDupsRows | fix_duplicates.py:48-71 | Corrected step, with cascading deletes. After a group, every duplicate's phytochemical and descriptor rows are gone, and spices are unchanged. |
| Dedup.MergeDupsLinks | fix_duplicates.py:50-54 | Corrected step, with cascading deletes. After a group, a link survives unless it names a duplicate, and the keeper gains a link to every spice of a duplicate. |
| Dedup.MergeDupsStructures | fix_duplicates.py:56-68 | After a group, no structure row names a duplicate. The keeper keeps its own row, or else receives the row of the first duplicate that had one. Other rows are untouched. The structure statements do the same as written. |
| Dedup.MergeGroup | fix_duplicates.py:36-71 | Corrected step: a group of fewer than two rows is skipped; otherwise every row after the first is merged into the first. |
| Dedup.MergeGroupNames | fix_duplicates.py:36-71 | A duplicated name is left with one row, the keeper, whose id and cid are unchanged; other names keep their rows. |
| Dedup.MergeGroupLinks | fix_duplicates.py:39-54 | Corrected step, with cascading deletes. The keeper's spices afterwards are exactly the spices of the whole group. No link names a merged row, and other links are untouched. |
| Dedup.MergeGroupStructures | fix_duplicates.py:39-68 | Corrected step, with cascading deletes. The keeper has a structure row iff some row of the group had one: its own when it had one, else the first duplicate's. No merged row keeps a structure or descriptor row, and other rows are untouched. |
| Dedup.FixDuplicates | fix_duplicates.py:20-73 | The corrected script: each reported name's group is read again from the current tables and merged. |
| Dedup.NamesOthersStay | fix_duplicates.py:20-71 | Merging one group leaves the rows of every other name alone. |
| Dedup.RestStillDuplicated | fix_duplicates.py:20-73 | After the first group is merged, the remaining reported names are still duplicated. |
| Dedup.FixLeavesOne | fix_duplicates.py:11-73 | After the script, each processed name has exactly one row, one it had before; other names are untouched. |
| Dedup.FixRemovesDuplicates | fix_duplicates.py:11-73 | When given the names the grouping query reports, no name is duplicated afterwards. |
| Dedup.FixKeepsSpicesByName | fix_duplicates.py:20-73 | The script never changes which spices contain a compound of a given name. |
| Dedup.GroupStepSpices | fix_duplicates.py:39-71 | One group's merge keeps the spices of every name. |
| Dedup.GroupStepIntegrity | fix_duplicates.py:39-71 | With cascading deletes, one group's merge leaves every link, structure row and descriptor row naming an existing phytochemical. |
| Dedup.FixKeepsIntegrity | fix_duplicates.py:20-73 | With cascading deletes, the script keeps every reference to a phytochemical valid. |
| Dedup.GroupStepStructures | fix_duplicates.py:56-68 | One group's merge keeps, for every name, whether it has a structure row. |
| Dedup.FixKeepsStructures | fix_duplicates.py:20-73 | A name has a structure row after the script iff one of its rows had one before. |
| Dedup.MergeDupsAsWritten | fix_duplicates.py:48-71 | The duplicates folded into the keeper with the statements as written. |
| Dedup.MergeGroupAsWritten | fix_duplicates.py:36-71 | A group merged with the statements as written. |
| Dedup.FixDuplicatesAsWritten | fix_duplicates.py:20-73 | The script as it runs, with the links left on deleted rows in the tables the later groups are read from. |
| Dedup.Agree | fix_duplicates.py:48-71 | An as-written store and a corrected store have the same spices, phytochemicals and structure rows, and the same links to every existing phytochemical; the corrected links are among the as-written ones. |
| Dedup.AgreeRank | fix_duplicates.py:24-34 | Agreeing stores give every existing row the same sort key. |
| Dedup.AgreeOrder | fix_duplicates.py:24-34 | Agreeing stores return a group of existing rows in the same order, so the same keeper is chosen. |
| Dedup.AgreeStep | fix_duplicates.py:48-71 | Merging one duplicate as written and with cascades keeps the stores agreeing. |
| Dedup.AgreeDups | fix_duplicates.py:48-71 | Merging a group's duplicates both ways keeps the stores agreeing. |
| Dedup.AgreeGroup | fix_duplicates.py:36-71 | Agreeing stores read the same group for a name, and merging it both ways keeps them agreeing. |
| Dedup.AgreeFix | fix_duplicates.py:20-73 | The script as written and the corrected script end in agreeing stores. |
| Dedup.AgreeNames | fix_duplicates.py:20-73 | Agreeing stores have the same rows, the same spices and the same structure presence under every name. |
| Dedup.FixAsWrittenFacts | fix_duplicates.py:11-73 | As written, the script still leaves no name duplicated, keeps every name's spices and keeps every name's structure. |

## Left out

- Flask routing, templates, `abort` and the 404 handler: view glue. The 404 is `NotFound` in `Enrichment.PhytochemicalDetail`.
- The list of spices on the detail page (app.py:793-802): a read-only query.
- SQL text, connections, `ensure_schema` DDL, and `ensure_descriptors_table_schema`: the tables are Dafny maps and sets.
- HTTP, JSON decoding, timeouts and the User-Agent header. They are inputs: a `Server` gives every attempt's outcome, and a `Service` gives the batched properties (None when anything in the request raises) and the text endpoint.
- `time.sleep`. The app's backoffs and the batch tool's pauses are recorded as values. The batch tool's `--sleep` between requests and the 0.2 s courtesy delays are not modelled.
- File-system effects other than writing a destination (`makedirs`, `getsize` errors).
- pandas and Excel reading. A sheet arrives as header texts and rows of optional cell texts.
- `pd.isna`, and `float()` on arbitrary numeric text. Only `[+-]digits[.digits]` literals are parsed (`LoadData.DecimalValue`). Exponents, `inf`, `nan` and underscores read as None.
- LoadData.UnifyColumns: when two kept headers unify to the same name, pandas would return both columns; the model reads the first.
- LoadData.ResolvePhyto: the fallback at load_data.py:273-276 for a cid missing right after its insert cannot happen when the index matches the table, so it is not modelled.
- LoadData.Load: spices are keyed by name. The counts printed at the end are not modelled. Each sheet is loaded with the corrected step; a sheet that mixes rows with and without a `cid` raises in the script and loses itself and every later sheet (`LoadData.LoadSheetAsWritten`, see "## Findings").
- LoadData.NoCidFresh: states the corrected step. As written, a cid-less row is loaded without raising only on a sheet where no raw row has a `cid`.
- LoadData.ParseCid: `float()` rounds to a double before `int()`, so a digit string past 2^53 ("9007199254740993" reads as 9007199254740992) or a fraction that rounds up ("1.99999999999999999" reads as 2) differs in Python. The model reads the digits exactly.
- LoadData.DecimalWithFraction: states the digit-literal reading; Python's double rounding can make the result one more than the integer part, as under `LoadData.ParseCid`.
- LoadData.ParseCidFraction: the same double-rounding gap as `LoadData.DecimalWithFraction`.
- LoadData.ParseCidRoundTrip: holds in Python only for `n` below 2^53, because of the same double rounding.
- DrugLikeness.Evaluate: a descriptor value is an exact real that stands for the decimal PubChem reported, and each threshold is the exact real its label shows. app.py:372-373 passes every value through `float()`, and app.py:384-418 compare doubles against double literals. A value within one double spacing of a threshold can therefore be judged differently. For example, the real -0.40000000000000001 fails Ghose's XLogP bound in the model, but it reads as the double -0.4, which passes in Python. This applies to the non-integer thresholds -0.4, 5.6, 5.88 and 131.6. It also applies to a decimal with more digits than a double holds next to an integer threshold, such as 500.00000000000001, which reads as 500.0. A reported value with a short decimal compares the same way in both.
- DrugLikeness.CalcDruglikenessRules: the five tables are evaluated by `DrugLikeness.Evaluate` on exact reals, so they inherit its gap. Double rounding after `float()` can flip a verdict for a value within one double spacing of 131.6, -0.4, 5.6, 5.88 or any other threshold.
- Lowercasing covers ASCII and Latin-1 capitals only (`Text.LowerChar`). Other Unicode case mappings are not modelled.
- `admin_download_missing_structures` (app.py:816-849): not part of this model.
- CLI parsing, `print` output and the progress messages are left out. The batch tool's `--db`, `--out`, `--limit` and `--mode` are parameters.
- BatchDownload.RunBatch: the selection order is an input that `BatchDownload.Selected` describes. The query itself is not modelled.
- Dedup.Order: SQLite leaves the order of rows with equal sort keys unspecified. The model breaks ties by ascending id.
- Dedup.FixDuplicates: models the script with the cascading deletes the schema declares; the script as it runs is `Dedup.FixDuplicatesAsWritten`, related to it by `Dedup.AgreeFix`. The grouping query's names are a parameter, in its output order. `Dedup.FixRemovesDuplicates` assumes they are exactly the duplicated names. `Order`, `GroupOf`, `FixDuplicates` and `FixDuplicatesAsWritten` are ghost, because choosing a least element from a set is not compiled.
- Dedup.MergeDupsLinks: states the corrected step. As written, a link to a spice the keeper already has stays on the deleted row (`Dedup.AsWrittenOrphans`).
- Dedup.MergeGroupLinks: states the corrected step. As written, "no link names a merged row" does not hold; `Dedup.FixAsWrittenFacts` states what the script as written keeps.
- Dedup.MergeGroupStructures: states the corrected step. As written, a merged row's descriptor row stays.
- Dedup.MergeDupsRows: states the corrected step. As written, the duplicates' descriptor rows stay.
- The printed counts of the duplicate fixer and the batch tool's `ok2d`/`ok3d`/`okpng` messages are not modelled. The counters themselves are modelled.

## Findings

| source | as written | input that shows it | evidently intended | confidence | as-written member | corrected member |
|---|---|---|---|---|---|---|
| fix_duplicates.py:6-71 | The connection never turns on `PRAGMA foreign_keys`, so deleting a duplicate cascades nowhere. The schema's `ON DELETE CASCADE` (load_data.py:152, 165, 191) does not act. A link that `UPDATE OR IGNORE` could not move stays on the deleted row, and the duplicate's descriptor row stays too. | Rows 1 and 2 both named "x", spice 7 linked to both, and a descriptor row for 2. After the merge, link (7, 2) and descriptor row 2 refer to a deleted phytochemical. | The deletes cascade as the schema declares, so no link or descriptor row is left pointing at a deleted phytochemical. | not executed | Dedup.OrphanExample | Dedup.FixKeepsIntegrity |
| load_data.py:250-270 | `df["cid"].map(parse_cid)` runs before `dropna`. When some rows parse to an id and others to `None`, pandas stores the column as floats with NaN for the missing ids. NaN is not `None`, so a kept row without an id reaches `int(cid)`, which raises. The sheet's uncommitted rows and every later sheet are lost. | A sheet whose `cid` column holds 7 in one row and is empty in another row that has both names. | A row without a `cid` becomes a phytochemical of its own, as the comment at load_data.py:285 says, whatever the other rows hold. | medium, not executed | LoadData.MixedSheetAborts | LoadData.NoCidFresh |
